/**
 * The tables the sequential run of a cycle draws along the way: after the
 * first `i` wallets' tasks, and in the middle of task `i` after `k` exchanges.
 * Every redraw of the sequential run shows one of them; the tables the
 * concurrent tasks draw when their steps interleave are those of the
 * `Interleaving` module. The lemmas here state what holds of each such
 * table, not only of the table the cycle leaves behind. They are proved
 * for any starting table and then applied to the fresh one.
 */
module Frames {
  import opened Text
  import opened Progress

  /** No entry has counted more exchanges than its total. */
  predicate Bounded(t: Table) {
    forall w :: w in t.entries ==> t.entries[w].completed <= t.entries[w].total
  }

  /** Every wallet of `ws` has an entry in `t`. */
  predicate Covers(t: Table, ws: seq<string>) {
    forall j :: 0 <= j < |ws| ==> ws[j] in t.entries
  }

  /** The table once the tasks of the first `i` wallets have run on `t`. */
  function Before(t: Table, ws: seq<string>, messages: seq<string>, outcomes: seq<seq<Outcome>>, i: nat): (r: Table)
    requires Shaped(ws, messages, outcomes) && Covers(t, ws) && i <= |ws|
    ensures r.order == t.order && r.entries.Keys == t.entries.Keys
  {
    assert forall j :: 0 <= j < i ==> ws[..i][j] == ws[j] && outcomes[..i][j] == outcomes[j];
    WalletRuns(t, ws[..i], messages, outcomes[..i])
  }

  /** The table once the first `i` tasks have run and task `i` has made `k` exchanges. */
  function During(t: Table, ws: seq<string>, messages: seq<string>, outcomes: seq<seq<Outcome>>, i: nat, k: nat): (r: Table)
    requires Shaped(ws, messages, outcomes) && Covers(t, ws) && i < |ws| && k <= |messages|
    ensures r.order == t.order && r.entries.Keys == t.entries.Keys
  {
    Exchanges(Before(t, ws, messages, outcomes, i), ws[i], messages[..k], outcomes[i][..k])
  }

  /** Extending the prefix of wallets by one runs that wallet's task on the table so far. */
  lemma WalletRunsNext(t: Table, ws: seq<string>, messages: seq<string>, outcomes: seq<seq<Outcome>>, i: nat)
    requires Shaped(ws, messages, outcomes) && i < |ws|
    requires forall j :: 0 <= j < |ws| ==> ws[j] in t.entries
    ensures Shaped(ws[..i], messages, outcomes[..i]) && Shaped(ws[..i + 1], messages, outcomes[..i + 1])
    ensures ws[i] in WalletRuns(t, ws[..i], messages, outcomes[..i]).entries
    ensures WalletRuns(t, ws[..i + 1], messages, outcomes[..i + 1])
         == WalletRun(WalletRuns(t, ws[..i], messages, outcomes[..i]), ws[i], messages, outcomes[i])
  {
    assert ws[..i + 1][..i] == ws[..i];
    assert outcomes[..i + 1][..i] == outcomes[..i];
  }

  /** The texts drawn after each of the first `n` exchanges of one wallet's task, the `i`-th after `i + 1` exchanges. */
  function Redraws(t: Table, w: string, messages: seq<string>, outcomes: seq<Outcome>, n: nat): (r: seq<string>)
    requires Listed(t) && w in t.entries && |messages| == |outcomes| && n <= |messages|
    ensures |r| == n
  {
    if n == 0 then []
    else Redraws(t, w, messages, outcomes, n - 1) + [Render(Exchanges(t, w, messages[..n], outcomes[..n]))]
  }

  /** Every text one wallet's task draws: a redraw per exchange, then the redraw after "Completed". */
  function WalletFrames(t: Table, w: string, messages: seq<string>, outcomes: seq<Outcome>): (r: seq<string>)
    requires Listed(t) && w in t.entries && |messages| == |outcomes|
    ensures |r| == |messages| + 1 && Last(r) == Render(WalletRun(t, w, messages, outcomes))
  {
    Redraws(t, w, messages, outcomes, |messages|) + [Render(WalletRun(t, w, messages, outcomes))]
  }

  /** The `i`-th of the first `n` redraws of a task shows the table after its first `i + 1` exchanges. */
  lemma {:induction false} RedrawsAt(t: Table, w: string, messages: seq<string>, outcomes: seq<Outcome>, n: nat, i: nat)
    requires Listed(t) && w in t.entries && |messages| == |outcomes| && i < n <= |messages|
    ensures Redraws(t, w, messages, outcomes, n)[i] == Render(Exchanges(t, w, messages[..i + 1], outcomes[..i + 1]))
  {
    if i < n - 1 {
      RedrawsPrefix(t, w, messages, outcomes, n, i);
      RedrawsAt(t, w, messages, outcomes, n - 1, i);
    } else {
      RedrawsTop(t, w, messages, outcomes, n, i);
    }
  }

  /** One exchange fewer keeps every earlier redraw, here redraw `i`. */
  lemma RedrawsPrefix(t: Table, w: string, messages: seq<string>, outcomes: seq<Outcome>, n: nat, i: nat)
    requires Listed(t) && w in t.entries && |messages| == |outcomes| && i < n - 1 && n <= |messages|
    ensures Redraws(t, w, messages, outcomes, n)[i] == Redraws(t, w, messages, outcomes, n - 1)[i]
  {
  }

  /** The last of the first `n` redraws, number `i = n - 1`, shows the table after `n` exchanges. */
  lemma RedrawsTop(t: Table, w: string, messages: seq<string>, outcomes: seq<Outcome>, n: nat, i: nat)
    requires Listed(t) && w in t.entries && |messages| == |outcomes| && i + 1 == n <= |messages|
    ensures Redraws(t, w, messages, outcomes, n)[i] == Render(Exchanges(t, w, messages[..i + 1], outcomes[..i + 1]))
  {
  }

  /** The number of redraws in a cycle of `wallets` wallets over `messages` messages. */
  function FrameCount(wallets: nat, messages: nat): (n: nat)
    ensures n >= 1
  {
    if wallets == 0 then 1 else FrameCount(wallets - 1, messages) + messages + 1
  }

  /** One initial redraw, then one per exchange and one per finished wallet. */
  lemma {:induction false} FrameCountValue(wallets: nat, messages: nat)
    ensures FrameCount(wallets, messages) == 1 + wallets * (messages + 1)
  {
    if wallets > 0 {
      FrameCountValue(wallets - 1, messages);
      assert wallets * (messages + 1) == (wallets - 1) * (messages + 1) + messages + 1;
    }
  }

  /** The texts the tasks of the first `i` wallets draw, task after task. */
  function TaskFrames(t: Table, ws: seq<string>, messages: seq<string>, outcomes: seq<seq<Outcome>>, i: nat): (r: seq<string>)
    requires Shaped(ws, messages, outcomes) && Covers(t, ws) && Listed(t) && i <= |ws|
    ensures |r| + 1 == FrameCount(i, |messages|)
  {
    if i == 0 then []
    else
      TaskFrames(t, ws, messages, outcomes, i - 1)
      + WalletFrames(Before(t, ws, messages, outcomes, i - 1), ws[i - 1], messages, outcomes[i - 1])
  }

  /** Every text a cycle draws: the fresh table, then the texts of each wallet's task in turn. */
  function CycleFrames(ws: seq<string>, messages: seq<string>, outcomes: seq<seq<Outcome>>): (r: seq<string>)
    requires Shaped(ws, messages, outcomes)
    ensures |r| == FrameCount(|ws|, |messages|)
  {
    var t := Initial(ws, |messages|);
    assert Covers(t, ws) by {
      assert forall j :: 0 <= j < |ws| ==> ws[j] in ws;
    }
    [Render(t)] + TaskFrames(t, ws, messages, outcomes, |ws|)
  }

  /** One task more appends the texts that task draws on the table the earlier tasks left. */
  lemma TaskFramesNext(t: Table, ws: seq<string>, messages: seq<string>, outcomes: seq<seq<Outcome>>, i: nat, first: string)
    requires Shaped(ws, messages, outcomes) && Covers(t, ws) && Listed(t) && i < |ws|
    ensures [first] + TaskFrames(t, ws, messages, outcomes, i + 1)
         == ([first] + TaskFrames(t, ws, messages, outcomes, i))
            + WalletFrames(Before(t, ws, messages, outcomes, i), ws[i], messages, outcomes[i])
  {
    var a, b := TaskFrames(t, ws, messages, outcomes, i), WalletFrames(Before(t, ws, messages, outcomes, i), ws[i], messages, outcomes[i]);
    assert TaskFrames(t, ws, messages, outcomes, i + 1) == a + b;
    AppendAssoc([first], a, b);
  }

  /** The first text of a cycle shows the fresh table, the last one the table the cycle leaves. */
  lemma CycleFramesEnds(ws: seq<string>, messages: seq<string>, outcomes: seq<seq<Outcome>>)
    requires Shaped(ws, messages, outcomes)
    ensures CycleFrames(ws, messages, outcomes)[0] == Render(Initial(ws, |messages|))
    ensures Last(CycleFrames(ws, messages, outcomes)) == Render(Cycle(ws, messages, outcomes))
  {
    var t := Initial(ws, |messages|);
    BeforeAll(ws, messages, outcomes);
    if ws == [] {
      BeforeFirst(t, ws, messages, outcomes);
    } else {
      TaskFramesLast(t, ws, messages, outcomes, |ws|);
      LastAppend([Render(t)], TaskFrames(t, ws, messages, outcomes, |ws|));
    }
  }

  /** The last text of the first `i` tasks shows the table they leave. */
  lemma TaskFramesLast(t: Table, ws: seq<string>, messages: seq<string>, outcomes: seq<seq<Outcome>>, i: nat)
    requires Shaped(ws, messages, outcomes) && Covers(t, ws) && Listed(t) && 0 < i <= |ws|
    ensures Last(TaskFrames(t, ws, messages, outcomes, i)) == Render(Before(t, ws, messages, outcomes, i))
  {
    BeforeNext(t, ws, messages, outcomes, i - 1);
  }

  /** More wallets, more redraws. */
  lemma {:induction false} FrameCountMonotone(i: nat, j: nat, messages: nat)
    requires i <= j
    ensures FrameCount(i, messages) <= FrameCount(j, messages)
  {
    if i < j {
      FrameCountMonotone(i, j - 1, messages);
    }
  }

  /** Multiplying by the same natural number keeps the order. */
  lemma MulMonotone(a: nat, b: nat, c: nat)
    ensures a <= b ==> a * c <= b * c
  {
  }

  /** Every text after the first is text `k` of some task `i`, with `k` at most the number of messages. */
  lemma FrameIndex(j: nat, wallets: nat, messages: nat)
    requires 0 < j < FrameCount(wallets, messages)
    ensures var i, k := (j - 1) / (messages + 1), (j - 1) % (messages + 1);
      i < wallets && k <= messages && FrameCount(i, messages) + k == j
  {
    var i, k := (j - 1) / (messages + 1), (j - 1) % (messages + 1);
    FrameCountValue(wallets, messages);
    FrameCountValue(i, messages);
    MulMonotone(wallets, i, messages + 1);
  }

  /** Text `k` of a task shows the table after `k + 1` exchanges, and text `|messages|` the table after "Completed". */
  lemma WalletFramesAt(t: Table, w: string, messages: seq<string>, outcomes: seq<Outcome>, k: nat)
    requires Listed(t) && w in t.entries && |messages| == |outcomes| && k <= |messages|
    ensures k < |messages| ==> WalletFrames(t, w, messages, outcomes)[k] == Render(Exchanges(t, w, messages[..k + 1], outcomes[..k + 1]))
    ensures k == |messages| ==> WalletFrames(t, w, messages, outcomes)[k] == Render(WalletRun(t, w, messages, outcomes))
  {
    if k < |messages| {
      RedrawsAt(t, w, messages, outcomes, |messages|, k);
    }
  }

  /** Later tasks keep the texts of the earlier ones. */
  lemma TaskFramesPrefix(t: Table, ws: seq<string>, messages: seq<string>, outcomes: seq<seq<Outcome>>, n: nat, j: nat)
    requires Shaped(ws, messages, outcomes) && Covers(t, ws) && Listed(t) && 0 < n <= |ws|
    requires j < |TaskFrames(t, ws, messages, outcomes, n - 1)|
    ensures TaskFrames(t, ws, messages, outcomes, n)[j] == TaskFrames(t, ws, messages, outcomes, n - 1)[j]
  {
  }

  /** The texts of task `n - 1` follow those of the tasks before it. */
  lemma TaskFramesTop(t: Table, ws: seq<string>, messages: seq<string>, outcomes: seq<seq<Outcome>>, n: nat, k: nat)
    requires Shaped(ws, messages, outcomes) && Covers(t, ws) && Listed(t) && 0 < n <= |ws| && k <= |messages|
    ensures FrameCount(n - 1, |messages|) + k - 1 < |TaskFrames(t, ws, messages, outcomes, n)|
    ensures TaskFrames(t, ws, messages, outcomes, n)[FrameCount(n - 1, |messages|) + k - 1]
         == WalletFrames(Before(t, ws, messages, outcomes, n - 1), ws[n - 1], messages, outcomes[n - 1])[k]
  {
  }

  /** Among the texts of the first `n` tasks, text `k` of task `i` sits after the `FrameCount(i, |messages|) - 1` before it. */
  lemma {:induction false} TaskFramesAt(t: Table, ws: seq<string>, messages: seq<string>, outcomes: seq<seq<Outcome>>, n: nat, i: nat, k: nat)
    requires Shaped(ws, messages, outcomes) && Covers(t, ws) && Listed(t) && i < n <= |ws| && k <= |messages|
    ensures FrameCount(i, |messages|) + k - 1 < |TaskFrames(t, ws, messages, outcomes, n)|
    ensures TaskFrames(t, ws, messages, outcomes, n)[FrameCount(i, |messages|) + k - 1]
         == WalletFrames(Before(t, ws, messages, outcomes, i), ws[i], messages, outcomes[i])[k]
  {
    if i < n - 1 {
      FrameCountMonotone(i + 1, n - 1, |messages|);
      TaskFramesAt(t, ws, messages, outcomes, n - 1, i, k);
      TaskFramesPrefix(t, ws, messages, outcomes, n, FrameCount(i, |messages|) + k - 1);
    } else {
      assert i == n - 1;
      TaskFramesTop(t, ws, messages, outcomes, n, k);
    }
  }

  /**
   * The table text `j` of a cycle shows: the fresh table first; then, for task
   * `i`, the table after each of its exchanges and the one after "Completed".
   */
  function FrameTable(ws: seq<string>, messages: seq<string>, outcomes: seq<seq<Outcome>>, j: nat): (r: Table)
    requires Shaped(ws, messages, outcomes) && j < FrameCount(|ws|, |messages|)
    ensures Listed(r)
  {
    var t := Initial(ws, |messages|);
    assert Covers(t, ws) by {
      assert forall j :: 0 <= j < |ws| ==> ws[j] in ws;
    }
    if j == 0 then t
    else
      FrameIndex(j, |ws|, |messages|);
      var i, k := (j - 1) / (|messages| + 1), (j - 1) % (|messages| + 1);
      if k < |messages| then During(t, ws, messages, outcomes, i, k + 1)
      else Before(t, ws, messages, outcomes, i + 1)
  }

  /** After the first text of a cycle come the texts of its tasks. */
  lemma CycleFramesIndex(ws: seq<string>, messages: seq<string>, outcomes: seq<seq<Outcome>>, x: nat)
    requires Shaped(ws, messages, outcomes) && 0 < x < FrameCount(|ws|, |messages|)
    ensures Covers(Initial(ws, |messages|), ws)
    ensures CycleFrames(ws, messages, outcomes)[x] == TaskFrames(Initial(ws, |messages|), ws, messages, outcomes, |ws|)[x - 1]
  {
    assert forall j :: 0 <= j < |ws| ==> ws[j] in ws;
  }

  /** Text `j`, number `k` of task `i` in a cycle, is text `k` of that task's own frames. */
  lemma {:induction false} CycleFramesTask(ws: seq<string>, messages: seq<string>, outcomes: seq<seq<Outcome>>, i: nat, k: nat, j: nat)
    requires Shaped(ws, messages, outcomes) && i < |ws| && k <= |messages| && j == FrameCount(i, |messages|) + k
    ensures Covers(Initial(ws, |messages|), ws)
    ensures j < FrameCount(|ws|, |messages|)
    ensures CycleFrames(ws, messages, outcomes)[j]
            == WalletFrames(Before(Initial(ws, |messages|), ws, messages, outcomes, i), ws[i], messages, outcomes[i])[k]
  {
    var t := Initial(ws, |messages|);
    assert Covers(t, ws) by {
      assert forall x :: 0 <= x < |ws| ==> ws[x] in ws;
    }
    TaskFramesAtIndex(t, ws, messages, outcomes, |ws|, i, k, j - 1);
    CycleFramesIndex(ws, messages, outcomes, j);
  }

  /** `TaskFramesAt`, for a text index `y` given outright. */
  lemma TaskFramesAtIndex(t: Table, ws: seq<string>, messages: seq<string>, outcomes: seq<seq<Outcome>>, n: nat, i: nat, k: nat, y: nat)
    requires Shaped(ws, messages, outcomes) && Covers(t, ws) && Listed(t) && i < n <= |ws| && k <= |messages|
    requires y + 1 == FrameCount(i, |messages|) + k
    ensures y < |TaskFrames(t, ws, messages, outcomes, n)|
    ensures TaskFrames(t, ws, messages, outcomes, n)[y]
         == WalletFrames(Before(t, ws, messages, outcomes, i), ws[i], messages, outcomes[i])[k]
  {
    TaskFramesAt(t, ws, messages, outcomes, n, i, k);
    SameIndex(TaskFrames(t, ws, messages, outcomes, n), y, FrameCount(i, |messages|) + k - 1);
  }

  /** Text `j`, number `k < |messages|` of task `i`, shows that task's first `k + 1` exchanges. */
  lemma {:induction false} CycleFramesDuring(ws: seq<string>, messages: seq<string>, outcomes: seq<seq<Outcome>>, i: nat, k: nat, j: nat)
    requires Shaped(ws, messages, outcomes) && i < |ws| && k < |messages| && j == FrameCount(i, |messages|) + k
    ensures Covers(Initial(ws, |messages|), ws)
    ensures j < FrameCount(|ws|, |messages|)
    ensures CycleFrames(ws, messages, outcomes)[j] == Render(During(Initial(ws, |messages|), ws, messages, outcomes, i, k + 1))
  {
    CycleFramesTask(ws, messages, outcomes, i, k, j);
    WalletFramesAt(Before(Initial(ws, |messages|), ws, messages, outcomes, i), ws[i], messages, outcomes[i], k);
  }

  /** Text `j`, the last of task `i`, shows the table after `i + 1` tasks. */
  lemma {:induction false} CycleFramesAfter(ws: seq<string>, messages: seq<string>, outcomes: seq<seq<Outcome>>, i: nat, j: nat)
    requires Shaped(ws, messages, outcomes) && i < |ws| && j == FrameCount(i, |messages|) + |messages|
    ensures Covers(Initial(ws, |messages|), ws)
    ensures j < FrameCount(|ws|, |messages|)
    ensures CycleFrames(ws, messages, outcomes)[j] == Render(Before(Initial(ws, |messages|), ws, messages, outcomes, i + 1))
  {
    CycleFramesTaskEnd(ws, messages, outcomes, i, j);
    TaskEndShows(Initial(ws, |messages|), ws, messages, outcomes, i);
  }

  /** Text `j`, the last of task `i`, is the last text of that task's own frames. */
  lemma {:induction false} CycleFramesTaskEnd(ws: seq<string>, messages: seq<string>, outcomes: seq<seq<Outcome>>, i: nat, j: nat)
    requires Shaped(ws, messages, outcomes) && i < |ws| && j == FrameCount(i, |messages|) + |messages|
    ensures Covers(Initial(ws, |messages|), ws)
    ensures j < FrameCount(|ws|, |messages|)
    ensures CycleFrames(ws, messages, outcomes)[j]
            == WalletFrames(Before(Initial(ws, |messages|), ws, messages, outcomes, i), ws[i], messages, outcomes[i])[|messages|]
  {
    CycleFramesTask(ws, messages, outcomes, i, |messages|, j);
  }

  /** The last text of task `i` shows the table after `i + 1` tasks. */
  lemma TaskEndShows(t: Table, ws: seq<string>, messages: seq<string>, outcomes: seq<seq<Outcome>>, i: nat)
    requires Shaped(ws, messages, outcomes) && Covers(t, ws) && Listed(t) && i < |ws|
    ensures WalletFrames(Before(t, ws, messages, outcomes, i), ws[i], messages, outcomes[i])[|messages|]
            == Render(Before(t, ws, messages, outcomes, i + 1))
  {
    WalletFramesAt(Before(t, ws, messages, outcomes, i), ws[i], messages, outcomes[i], |messages|);
    BeforeNext(t, ws, messages, outcomes, i);
  }

  /** Equal indices pick the same element; used where two index expressions are equal only by arithmetic. */
  lemma SameIndex(s: seq<string>, a: nat, b: nat)
    requires a == b < |s|
    ensures s[a] == s[b]
  {
  }

  /** Every text a cycle draws shows the table `FrameTable` names for it. */
  lemma {:induction false} CycleFramesShow(ws: seq<string>, messages: seq<string>, outcomes: seq<seq<Outcome>>, j: nat)
    requires Shaped(ws, messages, outcomes) && j < FrameCount(|ws|, |messages|)
    ensures CycleFrames(ws, messages, outcomes)[j] == Render(FrameTable(ws, messages, outcomes, j))
  {
    if j > 0 {
      FrameIndex(j, |ws|, |messages|);
      if (j - 1) % (|messages| + 1) < |messages| {
        CycleFramesDuring(ws, messages, outcomes, (j - 1) / (|messages| + 1), (j - 1) % (|messages| + 1), j);
      } else {
        CycleFramesAfter(ws, messages, outcomes, (j - 1) / (|messages| + 1), j);
      }
    }
  }

  /** No task has run on the starting table yet. */
  lemma BeforeFirst(t: Table, ws: seq<string>, messages: seq<string>, outcomes: seq<seq<Outcome>>)
    requires Shaped(ws, messages, outcomes) && Covers(t, ws)
    ensures Before(t, ws, messages, outcomes, 0) == t
  {
    assert ws[..0] == [];
  }

  /** The table after `i + 1` tasks is task `i` run on the table after `i`. */
  lemma BeforeNext(t: Table, ws: seq<string>, messages: seq<string>, outcomes: seq<seq<Outcome>>, i: nat)
    requires Shaped(ws, messages, outcomes) && Covers(t, ws) && i < |ws|
    ensures Before(t, ws, messages, outcomes, i + 1) == WalletRun(Before(t, ws, messages, outcomes, i), ws[i], messages, outcomes[i])
  {
    WalletRunsNext(t, ws, messages, outcomes, i);
  }

  /** The table after `i + 1` tasks is the table after task `i`'s last exchange, stamped "Completed". */
  lemma BeforeNextCompleted(t: Table, ws: seq<string>, messages: seq<string>, outcomes: seq<seq<Outcome>>, i: nat)
    requires Shaped(ws, messages, outcomes) && Covers(t, ws) && i < |ws|
    ensures Before(t, ws, messages, outcomes, i + 1) == AfterCompleted(During(t, ws, messages, outcomes, i, |messages|), ws[i])
  {
    BeforeNext(t, ws, messages, outcomes, i);
    assert messages[..|messages|] == messages;
    assert outcomes[i][..|messages|] == outcomes[i];
  }

  /** On the fresh table, running every task is the whole cycle. */
  lemma BeforeAll(ws: seq<string>, messages: seq<string>, outcomes: seq<seq<Outcome>>)
    requires Shaped(ws, messages, outcomes)
    ensures Covers(Initial(ws, |messages|), ws)
    ensures Before(Initial(ws, |messages|), ws, messages, outcomes, |ws|) == Cycle(ws, messages, outcomes)
  {
    assert forall j :: 0 <= j < |ws| ==> ws[j] in ws;
    assert ws[..|ws|] == ws && outcomes[..|ws|] == outcomes;
  }

  /** Every entry at 0 of `total`. */
  predicate Fresh(t: Table, total: nat) {
    forall w :: w in t.entries ==> t.entries[w].completed == 0 && t.entries[w].total == total
  }

  /**
   * What running tasks of distinct wallets keeps true of a fresh table: each
   * count within its total, every total the number of messages, and the
   * wallets whose task has not run yet still at 0.
   */
  predicate BoundedBefore(t: Table, ws: seq<string>, messages: seq<string>, outcomes: seq<seq<Outcome>>, i: nat)
    requires Shaped(ws, messages, outcomes) && Covers(t, ws) && i <= |ws|
  {
    var b := Before(t, ws, messages, outcomes, i);
    && Bounded(b)
    && (forall w :: w in b.entries ==> b.entries[w].total == |messages|)
    && (forall j :: i <= j < |ws| ==> b.entries[ws[j]].completed == 0)
  }

  /** Running one more task of a wallet listed once keeps the bound. */
  lemma BoundedStep(t: Table, ws: seq<string>, messages: seq<string>, outcomes: seq<seq<Outcome>>, i: nat)
    requires Shaped(ws, messages, outcomes) && Covers(t, ws) && Distinct(ws) && i < |ws|
    requires BoundedBefore(t, ws, messages, outcomes, i)
    ensures BoundedBefore(t, ws, messages, outcomes, i + 1)
  {
    var b := Before(t, ws, messages, outcomes, i);
    BeforeNext(t, ws, messages, outcomes, i);
    WalletRunEffect(b, ws[i], messages, outcomes[i]);
    assert forall j :: i + 1 <= j < |ws| ==> ws[j] != ws[i];
  }

  /** With distinct wallets, no table between two tasks counts more than its total. */
  lemma {:induction false} BeforeBounded(t: Table, ws: seq<string>, messages: seq<string>, outcomes: seq<seq<Outcome>>, i: nat)
    requires Shaped(ws, messages, outcomes) && Covers(t, ws) && Distinct(ws) && i <= |ws|
    requires Fresh(t, |messages|)
    ensures BoundedBefore(t, ws, messages, outcomes, i)
  {
    if i == 0 {
      BeforeFirst(t, ws, messages, outcomes);
    } else {
      BeforeBounded(t, ws, messages, outcomes, i - 1);
      BoundedStep(t, ws, messages, outcomes, i - 1);
    }
  }

  /** With distinct wallets, no table drawn in the middle of a task counts more than its total. */
  lemma DuringBounded(t: Table, ws: seq<string>, messages: seq<string>, outcomes: seq<seq<Outcome>>, i: nat, k: nat)
    requires Shaped(ws, messages, outcomes) && Covers(t, ws) && Distinct(ws) && i < |ws| && k <= |messages|
    requires Fresh(t, |messages|)
    ensures Bounded(During(t, ws, messages, outcomes, i, k))
  {
    var b := Before(t, ws, messages, outcomes, i);
    BeforeBounded(t, ws, messages, outcomes, i);
    ExchangesEffect(b, ws[i], messages[..k], outcomes[i][..k]);
  }

  /**
   * With distinct wallets, every table the sequential run of a cycle draws
   * keeps each count within its total: the first one, the one after every
   * exchange and the one after every finished task.
   */
  lemma CycleFramesBounded(ws: seq<string>, messages: seq<string>, outcomes: seq<seq<Outcome>>, i: nat, k: nat)
    requires Shaped(ws, messages, outcomes) && Distinct(ws) && i <= |ws| && k <= |messages|
    ensures Covers(Initial(ws, |messages|), ws)
    ensures Bounded(Before(Initial(ws, |messages|), ws, messages, outcomes, i))
    ensures i < |ws| ==> Bounded(During(Initial(ws, |messages|), ws, messages, outcomes, i, k))
  {
    var t := Initial(ws, |messages|);
    assert forall j :: 0 <= j < |ws| ==> ws[j] in ws;
    BeforeBounded(t, ws, messages, outcomes, i);
    if i < |ws| {
      DuringBounded(t, ws, messages, outcomes, i, k);
    }
  }

  /** The wallets, messages and failure texts of a cycle hold no newline. */
  predicate SingleLineInputs(ws: seq<string>, messages: seq<string>, outcomes: seq<seq<Outcome>>) {
    && (forall i :: 0 <= i < |ws| ==> '\n' !in ws[i])
    && (forall k :: 0 <= k < |messages| ==> '\n' !in messages[k])
    && (forall i, k :: 0 <= i < |outcomes| && 0 <= k < |outcomes[i]| && outcomes[i][k].Failure? ==> '\n' !in outcomes[i][k].message)
  }

  /** Stamping "Completed" brings no newline into the table. */
  lemma CompletedSingleLine(t: Table, w: string)
    requires w in t.entries && SingleLineTexts(t)
    ensures SingleLineTexts(AfterCompleted(t, w))
  {
  }

  /** An exchange whose message and failure text hold no newline brings none into the table. */
  lemma ExchangeSingleLine(t: Table, w: string, message: string, outcome: Outcome)
    requires w in t.entries && SingleLineTexts(t)
    requires '\n' !in message && (outcome.Failure? ==> '\n' !in outcome.message)
    ensures SingleLineTexts(AfterExchange(t, w, message, outcome))
  {
    match outcome
    case Success =>
      StatusNewlines(message);
      assert AfterExchange(t, w, message, outcome) == AfterSuccess(t, w, message);
    case Failure(err) =>
      StatusNewlines(err);
      assert AfterExchange(t, w, message, outcome) == AfterFailure(t, w, err);
  }

  /** Exchanges over newline-free messages and failure texts bring no newline into the table. */
  lemma {:induction false} ExchangesSingleLine(t: Table, w: string, messages: seq<string>, outcomes: seq<Outcome>)
    requires w in t.entries && |messages| == |outcomes| && SingleLineTexts(t)
    requires forall k :: 0 <= k < |messages| ==> '\n' !in messages[k]
    requires forall k :: 0 <= k < |outcomes| && outcomes[k].Failure? ==> '\n' !in outcomes[k].message
    ensures SingleLineTexts(Exchanges(t, w, messages, outcomes))
  {
    if messages != [] {
      var n := |messages| - 1;
      assert forall k :: 0 <= k < n ==> messages[..n][k] == messages[k] && outcomes[..n][k] == outcomes[k];
      ExchangesSingleLine(t, w, messages[..n], outcomes[..n]);
      ExchangeSingleLine(Exchanges(t, w, messages[..n], outcomes[..n]), w, messages[n], outcomes[n]);
    }
  }

  /** Tasks over newline-free inputs bring no newline into the table between two tasks. */
  lemma {:induction false} BeforeSingleLine(t: Table, ws: seq<string>, messages: seq<string>, outcomes: seq<seq<Outcome>>, i: nat)
    requires Shaped(ws, messages, outcomes) && Covers(t, ws) && i <= |ws|
    requires SingleLineInputs(ws, messages, outcomes) && SingleLineTexts(t)
    ensures SingleLineTexts(Before(t, ws, messages, outcomes, i))
  {
    if i == 0 {
      BeforeFirst(t, ws, messages, outcomes);
    } else {
      BeforeSingleLine(t, ws, messages, outcomes, i - 1);
      SingleLineStep(t, ws, messages, outcomes, i - 1);
    }
  }

  /** Running one more task over newline-free inputs brings no newline into the table. */
  lemma SingleLineStep(t: Table, ws: seq<string>, messages: seq<string>, outcomes: seq<seq<Outcome>>, i: nat)
    requires Shaped(ws, messages, outcomes) && Covers(t, ws) && i < |ws|
    requires SingleLineInputs(ws, messages, outcomes) && SingleLineTexts(Before(t, ws, messages, outcomes, i))
    ensures SingleLineTexts(Before(t, ws, messages, outcomes, i + 1))
  {
    var b := Before(t, ws, messages, outcomes, i);
    BeforeNext(t, ws, messages, outcomes, i);
    ExchangesSingleLine(b, ws[i], messages, outcomes[i]);
    CompletedSingleLine(Exchanges(b, ws[i], messages, outcomes[i]), ws[i]);
  }

  /** Tasks over newline-free inputs bring no newline into a table drawn in the middle of a task. */
  lemma DuringSingleLine(t: Table, ws: seq<string>, messages: seq<string>, outcomes: seq<seq<Outcome>>, i: nat, k: nat)
    requires Shaped(ws, messages, outcomes) && Covers(t, ws) && i < |ws| && k <= |messages|
    requires SingleLineInputs(ws, messages, outcomes) && SingleLineTexts(t)
    ensures SingleLineTexts(During(t, ws, messages, outcomes, i, k))
  {
    BeforeSingleLine(t, ws, messages, outcomes, i);
    assert forall j :: 0 <= j < k ==> messages[..k][j] == messages[j] && outcomes[i][..k][j] == outcomes[i][j];
    ExchangesSingleLine(Before(t, ws, messages, outcomes, i), ws[i], messages[..k], outcomes[i][..k]);
  }

  /**
   * With newline-free wallets, messages and failure texts, every table a
   * cycle draws splits at newlines into exactly four lines per wallet.
   */
  lemma CycleFramesSplitIntoLines(ws: seq<string>, messages: seq<string>, outcomes: seq<seq<Outcome>>, i: nat, k: nat)
    requires Shaped(ws, messages, outcomes) && SingleLineInputs(ws, messages, outcomes)
    requires i <= |ws| && k <= |messages|
    ensures Covers(Initial(ws, |messages|), ws)
    ensures var b := Before(Initial(ws, |messages|), ws, messages, outcomes, i);
      WellFormed(b) && Split(Render(b), '\n') == Lines(b.order, b.entries) + [""]
    ensures i < |ws| ==> var d := During(Initial(ws, |messages|), ws, messages, outcomes, i, k);
      WellFormed(d) && Split(Render(d), '\n') == Lines(d.order, d.entries) + [""]
  {
    var t := Initial(ws, |messages|);
    assert forall j :: 0 <= j < |ws| ==> ws[j] in ws;
    assert SingleLineTexts(t);
    BeforeSingleLine(t, ws, messages, outcomes, i);
    RenderSplitsIntoLines(Before(t, ws, messages, outcomes, i));
    if i < |ws| {
      DuringSingleLine(t, ws, messages, outcomes, i, k);
      RenderSplitsIntoLines(During(t, ws, messages, outcomes, i, k));
    }
  }
}
